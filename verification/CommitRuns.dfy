/** Whole runs of many validators: each decides leaders on its own growing view, changes its
    leader schedule at its own pace, or catches up with certified commits. */
module CommitRuns {
  import opened Division
  import opened Blocks
  import opened Dags
  import opened CommitRule
  import opened BaseCommitter
  import opened UniversalCommitter
  import opened CommitVerification

  /** An honest validator: its view, and its decision for each round from 1 on. */
  datatype Validator = Validator(dag: DagState, decided: seq<LeaderStatus>)

  /** What all validators compute alike. A new schedule is elected from the committed leaders each time
      `commitsPerSchedule` more leaders are committed; the blocks of a commit follow from the leaders up to it;
      digests identify commits. */
  datatype Protocol = Protocol(
    elect: seq<BlockRef> -> Schedule,
    commitsPerSchedule: nat,
    blocksOf: seq<BlockRef> -> seq<BlockRef>,
    hash: Hash)
  {
    ghost predicate Valid() {
      commitsPerSchedule > 0
    }

    /** The committed leaders that were known when the current schedule was elected. */
    ghost function ElectedFrom(decided: seq<LeaderStatus>): seq<BlockRef>
      requires Valid()
    {
      var leaders := CommittedLeaders(decided);
      LastUpdateIsInRange(|leaders|, commitsPerSchedule);
      leaders[..LastUpdate(|leaders|, commitsPerSchedule)]
    }

    ghost function Current(decided: seq<LeaderStatus>): Schedule
      requires Valid()
    {
      elect(ElectedFrom(decided))
    }

    /** How many more leaders may be sequenced under the current schedule. */
    function CommitsUntilUpdate(commits: nat): nat
      requires commitsPerSchedule > 0
    {
      commitsPerSchedule - commits % commitsPerSchedule
    }
  }

  function LastUpdate(commits: nat, interval: nat): nat
    requires interval > 0
  {
    commits - commits % interval
  }

  lemma LastUpdateIsInRange(commits: nat, interval: nat)
    requires interval > 0
    ensures LastUpdate(commits, interval) <= commits
  {
  }

  function CommittedLeaders(decided: seq<LeaderStatus>): seq<BlockRef> {
    if decided == [] then []
    else
      var rest := CommittedLeaders(decided[..|decided| - 1]);
      var last := decided[|decided| - 1];
      if last.Commit? then rest + [last.block] else rest
  }

  lemma {:induction false} CommittedLeadersGrow(decided: seq<LeaderStatus>, n: nat)
    requires n <= |decided|
    ensures CommittedLeaders(decided[..n]) <= CommittedLeaders(decided)
    ensures |CommittedLeaders(decided)| <= |CommittedLeaders(decided[..n])| + |decided| - n
  {
    if n == |decided| {
      assert decided[..n] == decided;
    } else {
      var shorter := decided[..|decided| - 1];
      CommittedLeadersGrow(shorter, n);
      assert shorter[..n] == decided[..n];
    }
  }

  /** The round in which the c-th committed leader was decided. */
  lemma {:induction false} CommittedAt(decided: seq<LeaderStatus>, c: nat) returns (i: nat)
    requires c < |CommittedLeaders(decided)|
    ensures i < |decided| && decided[i] == LeaderStatus.Commit(CommittedLeaders(decided)[c])
    ensures CommittedLeaders(decided[..i]) == CommittedLeaders(decided)[..c]
  {
    var n := |decided| - 1;
    var shorter := decided[..n];
    if c < |CommittedLeaders(shorter)| {
      i := CommittedAt(shorter, c);
      assert shorter[..i] == decided[..i];
    } else {
      i := n;
    }
  }

  /** Before the round of the next committed leader none is committed. */
  lemma NoneIsCommittedBetween(decided: seq<LeaderStatus>, c: nat, i: nat, r: nat)
    requires r < i <= |decided| && |CommittedLeaders(decided[..i])| == c && |CommittedLeaders(decided[..r])| >= c
    ensures !decided[r].Commit?
  {
    assert decided[..i][..r + 1] == decided[..r + 1] && decided[..r + 1][..r] == decided[..r];
    CommittedLeadersGrow(decided[..i], r + 1);
  }

  /** Fewer than the remaining number of commits later the schedule is still the same. */
  lemma ScheduleIsStable(e: Protocol, decided: seq<LeaderStatus>, n: nat)
    requires e.Valid() && n <= |decided|
    requires |decided| - n < e.CommitsUntilUpdate(|CommittedLeaders(decided[..n])|)
    ensures e.ElectedFrom(decided) == e.ElectedFrom(decided[..n])
  {
    CommittedLeadersGrow(decided, n);
    var before, after := |CommittedLeaders(decided[..n])|, |CommittedLeaders(decided)|;
    LastUpdateIsStable(before, after, e.commitsPerSchedule);
    LastUpdateIsInRange(before, e.commitsPerSchedule);
    assert CommittedLeaders(decided)[..before] == CommittedLeaders(decided[..n]);
  }

  lemma LastUpdateIsStable(before: nat, after: nat, interval: nat)
    requires interval > 0 && before <= after < before + interval - before % interval
    ensures LastUpdate(after, interval) == LastUpdate(before, interval)
  {
    var q, r := before / interval, before % interval;
    assert before == q * interval + r;
    RemainderIsUnique(interval, after / interval, after % interval, q, after - q * interval);
  }

  // ----- steps

  ghost predicate CanDecide(w: World, v: Validator) {
    ViewOf(w, v.dag, |v.decided| + 1)
  }

  /** The view changes in any way that keeps it a view and its garbage collection round below
      the next slot to decide. */
  ghost predicate UpdateView(w: World, v: Validator, v': Validator) {
    v'.decided == v.decided && CanDecide(w, v')
  }

  /** The outcome of one pass of the commit rule, cut at the next schedule change. */
  ghost function Outcome(w: World, e: Protocol, v: Validator): seq<LeaderStatus>
    requires e.Valid()
  {
    var decided := DecidedPrefix(Statuses(w, v.dag, e.Current(v.decided), |v.decided| + 1, LastDecidable(v.dag)));
    var limit := e.CommitsUntilUpdate(|CommittedLeaders(v.decided)|);
    if |decided| >= limit then decided[..limit] else decided
  }

  ghost predicate DecideLocally(w: World, e: Protocol, v: Validator, v': Validator)
    requires e.Valid()
  {
    CanDecide(w, v) && v'.dag == v.dag && v'.decided == v.decided + Outcome(w, e, v)
  }

  /** The commits that follow from committed leaders, each with the digest of the one before it. */
  ghost function CommitChain(e: Protocol, leaders: seq<BlockRef>): (chain: seq<ChainedCommit>)
    ensures |chain| == |leaders|
  {
    if leaders == [] then []
    else
      var n := |leaders| - 1;
      var before := CommitChain(e, leaders[..n]);
      before + [ChainedCommit(n + 1, if n == 0 then 0 else e.hash(before[n - 1]), leaders[n], e.blocksOf(leaders))]
  }

  /** Honest authors vote for commits that some validator has made. */
  ghost predicate AreHonestVotes(w: World, e: Protocol, g: seq<Validator>, votes: seq<Block>) {
    forall b, v :: b in votes && b.author !in w.byzantine && v in b.commitVotes ==> IsCommitOfSome(e, g, v)
  }

  ghost predicate IsCommitOfSome(e: Protocol, g: seq<Validator>, v: CommitRef) {
    exists j :: 0 <= j < |g| && IsInChain(e.hash, CommitChain(e, CommittedLeaders(g[j].decided)), v)
  }

  /** The leaders of the rounds up to the given one are skipped. */
  ghost function SkipUntil(e: Protocol, decided: seq<LeaderStatus>, round: Round): seq<LeaderStatus>
    requires e.Valid()
    decreases round
  {
    if round <= |decided| + 1 then decided
    else
      var before := SkipUntil(e, decided, round - 1);
      before + [Skip(SlotAt(round - 1, e.Current(before)(round - 1)))]
  }

  /** The next leaders are committed; what lies between them is skipped. */
  ghost function Follow(e: Protocol, decided: seq<LeaderStatus>, leaders: seq<BlockRef>): seq<LeaderStatus>
    requires e.Valid()
  {
    if leaders == [] then decided
    else
      var n := |leaders| - 1;
      SkipUntil(e, Follow(e, decided, leaders[..n]), leaders[n].round) + [LeaderStatus.Commit(leaders[n])]
  }

  function LeadersOf(commits: seq<ChainedCommit>): seq<BlockRef> {
    seq(|commits|, i requires 0 <= i < |commits| => commits[i].leader)
  }

  /** Commits that pass verification are taken over, as far as they are new and leave no gap. */
  ghost predicate CatchUp(w: World, e: Protocol, g: seq<Validator>, v: Validator, v': Validator, start: nat,
                          commits: seq<ChainedCommit>, votes: seq<Block>)
    requires e.Valid()
  {
    && w.Valid() && IsInjective(e.hash) && AreHonestVotes(w, e, g, votes)
    && start > 0 && IsChain(e.hash, commits, start) && IsCertified(w.committee, e.hash, commits, votes)
    && var next := |CommittedLeaders(v.decided)| + 1;
       && start <= next <= start + |commits|
       && v'.dag == v.dag && v'.decided == Follow(e, v.decided, LeadersOf(commits[next - start..]))
  }

  ghost predicate CatchesUp(w: World, e: Protocol, g: seq<Validator>, v: Validator, v': Validator)
    requires e.Valid()
  {
    exists start, commits, votes :: CatchUp(w, e, g, v, v', start, commits, votes)
  }

  /** After a restart the decisions past the last committed leader are taken again. */
  ghost predicate Restart(w: World, v: Validator, v': Validator) {
    v'.decided == v.decided[..LastCommitted(v.decided)] && CanDecide(w, v')
  }

  /** Number of decided rounds up to and including the last committed leader. */
  function LastCommitted(decided: seq<LeaderStatus>): (n: nat)
    ensures n <= |decided|
  {
    if decided == [] then 0
    else if decided[|decided| - 1].Commit? then |decided|
    else LastCommitted(decided[..|decided| - 1])
  }

  /** One validator moves. */
  ghost predicate Moves(w: World, e: Protocol, g: seq<Validator>, g': seq<Validator>, i: nat)
    requires e.Valid()
  {
    && |g'| == |g| && i < |g|
    && (forall j :: 0 <= j < |g| && j != i ==> g'[j] == g[j])
    && (|| UpdateView(w, g[i], g'[i])
        || DecideLocally(w, e, g[i], g'[i])
        || Restart(w, g[i], g'[i])
        || CatchesUp(w, e, g, g[i], g'[i]))
  }

  ghost predicate Next(w: World, e: Protocol, g: seq<Validator>, g': seq<Validator>)
    requires e.Valid()
  {
    exists i: nat :: Moves(w, e, g, g', i)
  }

  ghost predicate Initial(g: seq<Validator>) {
    forall i :: 0 <= i < |g| ==> g[i].decided == []
  }

  ghost predicate IsRun(w: World, e: Protocol, run: seq<seq<Validator>>)
    requires e.Valid()
  {
    && run != []
    && Initial(run[0])
    && forall t :: 0 <= t < |run| - 1 ==> Next(w, e, run[t], run[t + 1])
  }

  // ----- every decision is backed by some view

  ghost predicate BackedBy(w: World, e: Protocol, decided: seq<LeaderStatus>, i: nat, d: DagState, high: Round)
    requires e.Valid() && i < |decided|
  {
    && ViewOf(w, d, i + 1)
    && decided[i].IsDecided()
    && StatusAt(w, d, e.Current(decided[..i]), i + 1, high) == decided[i]
  }

  ghost predicate IsBacked(w: World, e: Protocol, decided: seq<LeaderStatus>, i: nat)
    requires e.Valid() && i < |decided|
  {
    exists d, high :: BackedBy(w, e, decided, i, d, high)
  }

  ghost predicate Backed(w: World, e: Protocol, decided: seq<LeaderStatus>)
    requires e.Valid()
  {
    forall i :: 0 <= i < |decided| ==> IsBacked(w, e, decided, i)
  }

  lemma BackedPrefix(w: World, e: Protocol, decided: seq<LeaderStatus>, n: nat)
    requires e.Valid() && Backed(w, e, decided) && n <= |decided|
    ensures Backed(w, e, decided[..n])
  {
    hide World.Valid, World.HasView, StatusAt;
    forall i | 0 <= i < n
      ensures IsBacked(w, e, decided[..n], i)
    {
      assert IsBacked(w, e, decided, i);
      var d, high :| BackedBy(w, e, decided, i, d, high);
      assert decided[..n][..i] == decided[..i];
      assert BackedBy(w, e, decided[..n], i, d, high);
    }
  }

  /** Backed sequences of decisions never contradict each other: one extends the other. */
  lemma {:induction false} BackedAgree(w: World, e: Protocol, a: seq<LeaderStatus>, b: seq<LeaderStatus>)
    requires e.Valid() && Backed(w, e, a) && Backed(w, e, b)
    requires |a| <= |b|
    ensures a <= b
  {
    hide World.Valid, World.HasView, StatusAt;
    if a == [] {
    } else {
      var n := |a| - 1;
      BackedPrefix(w, e, a, n);
      BackedAgree(w, e, a[..n], b);
      assert a[..n] == b[..n];
      assert IsBacked(w, e, a, n) && IsBacked(w, e, b, n);
      var d1, high1 :| BackedBy(w, e, a, n, d1, high1);
      var d2, high2 :| BackedBy(w, e, b, n, d2, high2);
      Agreement(w, d1, d2, e.Current(a[..n]), n + 1, high1, high2);
      assert a == a[..n] + [a[n]];
    }
  }

  lemma LocalDecisionIsBacked(w: World, e: Protocol, v: Validator, i: nat)
    requires e.Valid() && CanDecide(w, v)
    requires |v.decided| <= i < |v.decided + Outcome(w, e, v)|
    ensures BackedBy(w, e, v.decided + Outcome(w, e, v), i, v.dag, LastDecidable(v.dag))
  {
    hide World.Valid, World.HasView, Statuses;
    var n := |v.decided|;
    var all := v.decided + Outcome(w, e, v);
    var high := LastDecidable(v.dag);
    var schedule := e.Current(v.decided);
    var statuses := Statuses(w, v.dag, schedule, n + 1, high);
    StatusesEmpty(w, v.dag, schedule, n + 1, high);
    StatusesAreByRound(w, v.dag, schedule, n + 1, high, i - n);
    assert Outcome(w, e, v)[i - n] == statuses[i - n];
    assert all[..i][..n] == v.decided;
    ScheduleIsStable(e, all[..i], n);
    assert all[i] in DecidedPrefix(statuses);
    assert BackedBy(w, e, all, i, v.dag, high);
  }

  lemma StatusesEmpty(w: World, d: DagState, leaders: Schedule, low: Round, high: Round)
    ensures low > high ==> Statuses(w, d, leaders, low, high) == []
    ensures low <= high ==> |Statuses(w, d, leaders, low, high)| == high + 1 - low
  {
    hide World.Valid, World.HasView, DirectStatus, AnchorStatus;
    if low <= high {
      StatusesAreByRound(w, d, leaders, low, high, 0);
    }
  }

  lemma BackedExtension(w: World, e: Protocol, old': seq<LeaderStatus>, new': seq<LeaderStatus>, i: nat)
    requires e.Valid() && Backed(w, e, old') && old' <= new' && i < |old'|
    ensures IsBacked(w, e, new', i)
  {
    hide World.Valid, World.HasView, StatusAt;
    assert IsBacked(w, e, old', i);
    var d, high :| BackedBy(w, e, old', i, d, high);
    assert new'[..i] == old'[..i];
    assert BackedBy(w, e, new', i, d, high);
  }

  lemma MoveKeepsBacked(w: World, e: Protocol, g: seq<Validator>, g': seq<Validator>, i: nat)
    requires e.Valid() && Moves(w, e, g, g', i)
    requires forall j :: 0 <= j < |g| ==> Backed(w, e, g[j].decided)
    ensures Backed(w, e, g'[i].decided)
  {
    hide World.Valid, World.HasView, Backed, Outcome, CatchUp;
    if UpdateView(w, g[i], g'[i]) {
    } else if DecideLocally(w, e, g[i], g'[i]) {
      LocalStepKeepsBacked(w, e, g[i]);
    } else if Restart(w, g[i], g'[i]) {
      BackedPrefix(w, e, g[i].decided, LastCommitted(g[i].decided));
    } else {
      var start, commits, votes :| CatchUp(w, e, g, g[i], g'[i], start, commits, votes);
      CatchUpKeepsBacked(w, e, g, g[i], g'[i], start, commits, votes);
    }
  }

  lemma LocalStepKeepsBacked(w: World, e: Protocol, v: Validator)
    requires e.Valid() && CanDecide(w, v) && Backed(w, e, v.decided)
    ensures Backed(w, e, v.decided + Outcome(w, e, v))
  {
    hide World.Valid, World.HasView, Outcome, BackedBy;
    forall i | 0 <= i < |v.decided + Outcome(w, e, v)|
      ensures IsBacked(w, e, v.decided + Outcome(w, e, v), i)
    {
      if i < |v.decided| {
        BackedExtension(w, e, v.decided, v.decided + Outcome(w, e, v), i);
      } else {
        LocalDecisionIsBacked(w, e, v, i);
      }
    }
  }

  // ----- certified commits are decisions

  lemma {:induction false} CommitChainIsChain(e: Protocol, leaders: seq<BlockRef>)
    ensures IsChain(e.hash, CommitChain(e, leaders), 1) && LeadersOf(CommitChain(e, leaders)) == leaders
  {
    if leaders == [] {
    } else {
      var n := |leaders| - 1;
      CommitChainIsChain(e, leaders[..n]);
      assert LeadersOf(CommitChain(e, leaders[..n])) == leaders[..n];
    }
  }

  /** Certified commits are commits that some validator has made under the same indices. */
  lemma CertifiedIsCommitted(w: World, e: Protocol, g: seq<Validator>, start: nat, commits: seq<ChainedCommit>,
                             votes: seq<Block>)
    returns (j: nat)
    requires w.Valid() && IsInjective(e.hash) && AreHonestVotes(w, e, g, votes)
    requires start > 0 && IsChain(e.hash, commits, start) && IsCertified(w.committee, e.hash, commits, votes)
    ensures j < |g| && start - 1 + |commits| <= |CommittedLeaders(g[j].decided)|
    ensures commits == CommitChain(e, CommittedLeaders(g[j].decided))[start - 1..start - 1 + |commits|]
    ensures LeadersOf(commits) == CommittedLeaders(g[j].decided)[start - 1..start - 1 + |commits|]
  {
    hide IsChain, IsInChain, CommitChain, CommittedLeaders;
    var b := HonestVoteExists(w.committee, w.byzantine, e.hash, commits, votes);
    assert IsCommitOfSome(e, g, LastRef(e.hash, commits));
    j :| 0 <= j < |g| && IsInChain(e.hash, CommitChain(e, CommittedLeaders(g[j].decided)), LastRef(e.hash, commits));
    var leaders := CommittedLeaders(g[j].decided);
    CommitChainIsChain(e, leaders);
    ChainIsVouchedFor(e.hash, CommitChain(e, leaders), commits, start);
  }

  lemma SkipsAreDecided(w: World, e: Protocol, decided: seq<LeaderStatus>, r: nat)
    requires e.Valid() && Backed(w, e, decided) && r < |decided| && !decided[r].Commit?
    ensures decided[r] == Skip(SlotAt(r + 1, e.Current(decided[..r])(r + 1)))
  {
    hide World.Valid, World.HasView, Statuses;
    assert IsBacked(w, e, decided, r);
    var d, high :| BackedBy(w, e, decided, r, d, high);
    StatusesFit(w, d, e.Current(decided[..r]), r + 1, high);
  }

  lemma {:induction false} SkipUntilIsPrefix(w: World, e: Protocol, decided: seq<LeaderStatus>, n: nat, i: nat)
    requires e.Valid() && Backed(w, e, decided) && n <= i <= |decided|
    requires forall r :: n <= r < i ==> !decided[r].Commit?
    ensures SkipUntil(e, decided[..n], i + 1) == decided[..i]
  {
    hide Backed, Protocol.Current;
    if i == n {
    } else {
      SkipUntilIsPrefix(w, e, decided, n, i - 1);
      SkipsAreDecided(w, e, decided, i - 1);
      assert decided[..i] == decided[..i - 1] + [decided[i - 1]];
    }
  }

  /** Following the leaders that are committed in a backed sequence gives back part of it. */
  lemma {:induction false} FollowIsPrefix(w: World, e: Protocol, decided: seq<LeaderStatus>, n: nat, c: nat)
    returns (upto: nat)
    requires e.Valid() && Backed(w, e, decided) && n <= |decided|
    requires |CommittedLeaders(decided[..n])| <= c <= |CommittedLeaders(decided)|
    ensures n <= upto <= |decided|
    ensures Follow(e, decided[..n], CommittedLeaders(decided)[|CommittedLeaders(decided[..n])|..c]) == decided[..upto]
    ensures |CommittedLeaders(decided[..upto])| == c
    decreases c
  {
    hide Backed, SkipUntil, CommittedLeaders, Protocol.Current;
    var all, first := CommittedLeaders(decided), |CommittedLeaders(decided[..n])|;
    if c == first {
      upto := n;
    } else {
      var before := FollowIsPrefix(w, e, decided, n, c - 1);
      var i := CommittedAt(decided, c - 1);
      NextIsCommitted(w, e, decided, before, c - 1, i);
      upto := i + 1;
      assert all[first..c][..c - 1 - first] == all[first..c - 1];
      assert decided[..i + 1] == decided[..i] + [decided[i]];
    }
  }

  lemma NextIsCommitted(w: World, e: Protocol, decided: seq<LeaderStatus>, n: nat, c: nat, i: nat)
    requires e.Valid() && Backed(w, e, decided) && n <= |decided| && i < |decided| && decided[i].Commit?
    requires |CommittedLeaders(decided[..n])| == c == |CommittedLeaders(decided[..i])|
    ensures n <= i && SkipUntil(e, decided[..n], decided[i].block.round) == decided[..i]
    ensures |CommittedLeaders(decided[..i + 1])| == c + 1
  {
    hide Backed, SkipUntil, Protocol.Current;
    assert decided[..i + 1][..i] == decided[..i];
    if i < n {
      assert decided[..n][..i + 1] == decided[..i + 1];
      CommittedLeadersGrow(decided[..n], i + 1);
    }
    hide CommittedLeaders;
    forall r | n <= r < i
      ensures !decided[r].Commit?
    {
      assert decided[..r][..n] == decided[..n];
      CommittedLeadersGrow(decided[..r], n);
      NoneIsCommittedBetween(decided, c, i, r);
    }
    SkipUntilIsPrefix(w, e, decided, n, i);
    DecidedLeaderIsOfRound(w, e, decided, i);
  }

  lemma CatchUpKeepsBacked(w: World, e: Protocol, g: seq<Validator>, v: Validator, v': Validator, start: nat,
                           commits: seq<ChainedCommit>, votes: seq<Block>)
    requires e.Valid() && CatchUp(w, e, g, v, v', start, commits, votes)
    requires Backed(w, e, v.decided) && forall j :: 0 <= j < |g| ==> Backed(w, e, g[j].decided)
    ensures Backed(w, e, v'.decided)
  {
    hide World.Valid, AreHonestVotes, IsChain, IsCertified, Backed, CommittedLeaders, Follow, CommitChain;
    var j := CertifiedIsCommitted(w, e, g, start, commits, votes);
    FollowedLeaders(w, e, g, v, v', start, commits, votes, j);
  }

  /** Commits of more leaders start with the commits of fewer. */
  lemma {:induction false} CommitChainGrows(e: Protocol, leaders: seq<BlockRef>, n: nat)
    requires n <= |leaders|
    ensures CommitChain(e, leaders)[..n] == CommitChain(e, leaders[..n])
  {
    if n == |leaders| {
      assert leaders[..n] == leaders;
      assert CommitChain(e, leaders)[..n] == CommitChain(e, leaders);
    } else {
      var m := |leaders| - 1;
      CommitChainGrows(e, leaders[..m], n);
      assert leaders[..m][..n] == leaders[..n];
      assert CommitChain(e, leaders)[..m] == CommitChain(e, leaders[..m]);
      assert CommitChain(e, leaders)[..n] == CommitChain(e, leaders)[..m][..n];
    }
  }

  /** After catching up, the validator has exactly the certified commits under their indices. */
  lemma CatchUpReproduces(w: World, e: Protocol, g: seq<Validator>, v: Validator, v': Validator, start: nat,
                          commits: seq<ChainedCommit>, votes: seq<Block>)
    requires e.Valid() && CatchUp(w, e, g, v, v', start, commits, votes)
    requires Backed(w, e, v.decided) && forall j :: 0 <= j < |g| ==> Backed(w, e, g[j].decided)
    ensures var own := CommitChain(e, CommittedLeaders(v'.decided));
            |own| == start - 1 + |commits| && own[start - 1..] == commits
  {
    hide World.Valid, AreHonestVotes, IsChain, IsCertified, Backed, CommittedLeaders, Follow, CommitChain;
    var j := CertifiedIsCommitted(w, e, g, start, commits, votes);
    FollowedLeaders(w, e, g, v, v', start, commits, votes, j);
    var leaders := CommittedLeaders(g[j].decided);
    CommitChainGrows(e, leaders, start - 1 + |commits|);
  }

  /** The leaders committed after catching up are those of the validator that vouches for the commits. */
  lemma FollowedLeaders(w: World, e: Protocol, g: seq<Validator>, v: Validator, v': Validator, start: nat,
                        commits: seq<ChainedCommit>, votes: seq<Block>, j: nat)
    requires e.Valid() && CatchUp(w, e, g, v, v', start, commits, votes) && j < |g|
    requires Backed(w, e, v.decided) && Backed(w, e, g[j].decided)
    requires start - 1 + |commits| <= |CommittedLeaders(g[j].decided)|
    requires LeadersOf(commits) == CommittedLeaders(g[j].decided)[start - 1..start - 1 + |commits|]
    ensures CommittedLeaders(v'.decided) == CommittedLeaders(g[j].decided)[..start - 1 + |commits|]
    ensures Backed(w, e, v'.decided)
  {
    hide World.Valid, AreHonestVotes, IsChain, IsCertified, Backed, CommittedLeaders, Follow;
    var all, n, m := CommittedLeaders(g[j].decided), |CommittedLeaders(v.decided)|, start - 1 + |commits|;
    assert LeadersOf(commits[n + 1 - start..]) == LeadersOf(commits)[n + 1 - start..];
    assert LeadersOf(commits[n + 1 - start..]) == all[n..m];
    if n == m {
      FollowNothing(e, v.decided);
      SameLeaders(w, e, v.decided, g[j].decided);
    } else {
      PrefixOfMore(w, e, v.decided, g[j].decided);
      var upto := FollowIsPrefix(w, e, g[j].decided, |v.decided|, m);
      BackedPrefix(w, e, g[j].decided, upto);
      CommittedLeadersGrow(g[j].decided, upto);
    }
  }

  /** Backed sequences with fewer committed leaders have a prefix of the leaders. */
  lemma SameLeaders(w: World, e: Protocol, a: seq<LeaderStatus>, b: seq<LeaderStatus>)
    requires e.Valid() && Backed(w, e, a) && Backed(w, e, b) && |CommittedLeaders(a)| <= |CommittedLeaders(b)|
    ensures CommittedLeaders(a) == CommittedLeaders(b)[..|CommittedLeaders(a)|]
  {
    hide Backed;
    if |a| <= |b| {
      BackedAgree(w, e, a, b);
      assert b[..|a|] == a;
      CommittedLeadersGrow(b, |a|);
    } else {
      BackedAgree(w, e, b, a);
      assert a[..|b|] == b;
      CommittedLeadersGrow(a, |b|);
    }
  }

  lemma FollowNothing(e: Protocol, decided: seq<LeaderStatus>)
    requires e.Valid()
    ensures Follow(e, decided, []) == decided
  {
  }

  /** Who has committed fewer leaders has decided less. */
  lemma PrefixOfMore(w: World, e: Protocol, a: seq<LeaderStatus>, b: seq<LeaderStatus>)
    requires e.Valid() && Backed(w, e, a) && Backed(w, e, b) && |CommittedLeaders(a)| < |CommittedLeaders(b)|
    ensures |a| <= |b| && a == b[..|a|]
  {
    hide Backed;
    if |a| <= |b| {
      BackedAgree(w, e, a, b);
    } else {
      BackedAgree(w, e, b, a);
      assert a[..|b|] == b;
      CommittedLeadersGrow(a, |b|);
      assert false;
    }
  }

  lemma {:induction false} RunsAreBacked(w: World, e: Protocol, run: seq<seq<Validator>>, t: nat)
    requires e.Valid() && IsRun(w, e, run) && t < |run|
    ensures forall j :: 0 <= j < |run[t]| ==> Backed(w, e, run[t][j].decided)
  {
    hide World.Valid, World.HasView, Moves;
    if t == 0 {
    } else {
      RunsAreBacked(w, e, run, t - 1);
      assert Next(w, e, run[t - 1], run[t - 1 + 1]);
      var i: nat :| Moves(w, e, run[t - 1], run[t], i);
      MoveKeepsOthers(w, e, run[t - 1], run[t], i);
      MoveKeepsBacked(w, e, run[t - 1], run[t], i);
    }
  }

  lemma MoveKeepsOthers(w: World, e: Protocol, g: seq<Validator>, g': seq<Validator>, i: nat)
    requires e.Valid() && Moves(w, e, g, g', i)
    ensures |g'| == |g| && i < |g| && forall j :: 0 <= j < |g| && j != i ==> g'[j] == g[j]
  {
  }

  /** In every run, the decisions of any two validators, taken at any two moments, are
      prefixes of one another: the same leaders are committed in the same order. */
  lemma RunsAreConsistent(w: World, e: Protocol, run: seq<seq<Validator>>, t1: nat, i: nat, t2: nat, j: nat)
    requires e.Valid() && IsRun(w, e, run)
    requires t1 < |run| && i < |run[t1]| && t2 < |run| && j < |run[t2]|
    ensures run[t1][i].decided <= run[t2][j].decided || run[t2][j].decided <= run[t1][i].decided
  {
    RunsAreBacked(w, e, run, t1);
    RunsAreBacked(w, e, run, t2);
    var a, b := run[t1][i].decided, run[t2][j].decided;
    if |a| <= |b| {
      BackedAgree(w, e, a, b);
    } else {
      BackedAgree(w, e, b, a);
    }
  }

  /** The leader decided for a round is a block of that round. */
  lemma DecidedLeaderIsOfRound(w: World, e: Protocol, decided: seq<LeaderStatus>, i: nat)
    requires e.Valid() && Backed(w, e, decided) && i < |decided| && decided[i].Commit?
    ensures decided[i].block.round == i + 1 && decided[i].block in w.blocks
  {
    hide World.Valid, World.HasView, Statuses;
    assert IsBacked(w, e, decided, i);
    var d, high :| BackedBy(w, e, decided, i, d, high);
    StatusesFit(w, d, e.Current(decided[..i]), i + 1, high);
    ViewIsOfWorld(w, d, decided[i].block);
  }

  // ----- decisions that a run reaches

  ghost predicate IsReachedBy(w: World, e: Protocol, decided: seq<LeaderStatus>, run: seq<seq<Validator>>, t: nat,
                              i: nat)
    requires e.Valid()
  {
    IsRun(w, e, run) && t < |run| && i < |run[t]| && run[t][i].decided == decided
  }

  /** Some validator makes exactly these decisions in some run. */
  ghost predicate IsReachable(w: World, e: Protocol, decided: seq<LeaderStatus>)
    requires e.Valid()
  {
    exists run, t, i :: IsReachedBy(w, e, decided, run, t, i)
  }

  /** The decisions are those of one view, in all rounds that it can decide. */
  ghost predicate AreDecisionsOf(w: World, e: Protocol, d: DagState, decided: seq<LeaderStatus>)
    requires e.Valid()
  {
    && |decided| == LastDecidable(d)
    && forall i :: 0 <= i < |decided| ==> BackedBy(w, e, decided, i, d, LastDecidable(d))
  }

  /** A step on the view makes at least the next one of the decisions. */
  lemma StepMakesDecision(w: World, e: Protocol, d: DagState, decided: seq<LeaderStatus>, n: nat) returns (n': nat)
    requires e.Valid() && AreDecisionsOf(w, e, d, decided) && n < |decided|
    ensures n < n' <= |decided|
    ensures DecideLocally(w, e, Validator(d, decided[..n]), Validator(d, decided[..n']))
  {
    hide World.Valid, World.HasView, Statuses, StatusAt, CommittedLeaders;
    var v := Validator(d, decided[..n]);
    assert BackedBy(w, e, decided, n, d, LastDecidable(d));
    BackedByView(w, e, d, decided);
    BackedPrefix(w, e, decided, n);
    LocalStepKeepsBacked(w, e, v);
    StatusesEmpty(w, d, e.Current(v.decided), n + 1, LastDecidable(d));
    StatusesAreByRound(w, d, e.Current(v.decided), n + 1, LastDecidable(d), 0);
    hide Backed, BackedBy;
    var next := v.decided + Outcome(w, e, v);
    n' := |next|;
    BackedAgree(w, e, next, decided);
    assert next == decided[..n'];
  }

  lemma BackedByView(w: World, e: Protocol, d: DagState, decided: seq<LeaderStatus>)
    requires e.Valid() && AreDecisionsOf(w, e, d, decided)
    ensures Backed(w, e, decided)
  {
    hide BackedBy;
    forall i | 0 <= i < |decided|
      ensures IsBacked(w, e, decided, i)
    {
      assert BackedBy(w, e, decided, i, d, LastDecidable(d));
    }
  }

  lemma {:induction false} StepsMakeDecisions(w: World, e: Protocol, d: DagState, decided: seq<LeaderStatus>, n: nat,
                                              run: seq<seq<Validator>>)
    requires e.Valid() && AreDecisionsOf(w, e, d, decided) && n <= |decided|
    requires IsRun(w, e, run) && run[|run| - 1] == [Validator(d, decided[..n])]
    ensures IsReachable(w, e, decided)
    decreases |decided| - n
  {
    hide AreDecisionsOf, DecideLocally;
    if n == |decided| {
      assert decided[..n] == decided;
      assert IsReachedBy(w, e, decided, run, |run| - 1, 0);
    } else {
      var n' := StepMakesDecision(w, e, d, decided, n);
      var g, g' := run[|run| - 1], [Validator(d, decided[..n'])];
      assert Moves(w, e, g, g', 0);
      RunGrows(w, e, run, g');
      StepsMakeDecisions(w, e, d, decided, n', run + [g']);
    }
  }

  lemma RunGrows(w: World, e: Protocol, run: seq<seq<Validator>>, g: seq<Validator>)
    requires e.Valid() && IsRun(w, e, run) && Next(w, e, run[|run| - 1], g)
    ensures IsRun(w, e, run + [g])
  {
    hide Next;
    var run' := run + [g];
    forall t | 0 <= t < |run'| - 1
      ensures Next(w, e, run'[t], run'[t + 1])
    {
      if t < |run| - 1 {
        assert Next(w, e, run[t], run[t + 1]);
      }
    }
  }

  /** The decisions of a view are reached by a validator that has this view. */
  lemma DecisionsAreReachable(w: World, e: Protocol, d: DagState, decided: seq<LeaderStatus>)
    requires e.Valid() && AreDecisionsOf(w, e, d, decided)
    ensures IsReachable(w, e, decided)
  {
    hide AreDecisionsOf, Next;
    var v := Validator(d, []);
    assert decided[..0] == [];
    StepsMakeDecisions(w, e, d, decided, 0, [[v]]);
  }
}
