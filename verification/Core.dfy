/** Committing leaders one after the other: certified commits from other validators first, then
    what the commit rule decides, with a new leader schedule after a fixed number of commits. */
module Cores {
  import opened Blocks
  import opened Division
  import opened CommitRanges
  import opened CommitRule
  import opened CommitRuns

  /** A commit that a quorum has voted for, received from another validator. */
  datatype CertifiedCommit = CertifiedCommit(index: nat, leader: BlockRef)

  ghost predicate AreConsecutive(commits: seq<CertifiedCommit>) {
    forall i, j :: 0 <= i < j < |commits| ==> commits[j].index == commits[i].index + (j - i)
  }

  function Leaders(commits: seq<CertifiedCommit>): seq<BlockRef> {
    seq(|commits|, i requires 0 <= i < |commits| => commits[i].leader)
  }

  datatype FilterResult = New(commits: seq<CertifiedCommit>) | Gap(expected: nat, got: nat)

  /** The commits after the last one. */
  function NewCommits(commits: seq<CertifiedCommit>, last: nat): seq<CertifiedCommit> {
    if commits == [] then []
    else
      var n := |commits| - 1;
      NewCommits(commits[..n], last) + if commits[n].index > last then [commits[n]] else []
  }

  /** Keeps the commits that are not committed yet; the first of them must be the next in line. */
  method FilterNewCommits(commits: seq<CertifiedCommit>, last: nat) returns (r: FilterResult)
    ensures r.New? ==> r.commits == NewCommits(commits, last) && (r.commits == [] || r.commits[0].index == last + 1)
    ensures r.Gap? ==>
              NewCommits(commits, last) != [] && NewCommits(commits, last)[0].index == r.got != r.expected == last + 1
  {
    var kept: seq<CertifiedCommit> := [];
    for i := 0 to |commits|
      invariant kept == NewCommits(commits[..i], last)
    {
      assert commits[..i + 1][..i] == commits[..i];
      if commits[i].index > last {
        kept := kept + [commits[i]];
      }
    }
    assert commits[..|commits|] == commits;
    r := if kept != [] && kept[0].index != last + 1 then Gap(last + 1, kept[0].index) else New(kept);
  }

  /** When the first `k` commits are old and the others are new, the others are kept. */
  lemma {:induction false} NewFrom(commits: seq<CertifiedCommit>, last: nat, k: nat)
    requires k <= |commits|
    requires forall i :: 0 <= i < |commits| ==> (commits[i].index > last <==> k <= i)
    ensures NewCommits(commits, last) == commits[k..]
  {
    if commits == [] {
    } else {
      var n := |commits| - 1;
      NewFrom(commits[..n], last, if k <= n then k else n);
      if k <= n {
        assert commits[..n][k..] + [commits[n]] == commits[k..];
      }
    }
  }

  /** Where the new ones of consecutive commits begin. */
  lemma FirstNew(commits: seq<CertifiedCommit>, last: nat) returns (k: nat)
    requires AreConsecutive(commits)
    ensures k <= |commits|
    ensures forall i :: 0 <= i < |commits| ==> (commits[i].index > last <==> k <= i)
    ensures 0 < k < |commits| ==> commits[k].index == last + 1
  {
    if commits == [] || commits[0].index > last {
      k := 0;
      assert forall i :: 0 < i < |commits| ==> commits[i].index == commits[0].index + (i - 0);
    } else {
      var d := last + 1 - commits[0].index;
      k := if d <= |commits| then d else |commits|;
      assert forall i :: 0 < i < |commits| ==> commits[i].index == commits[0].index + (i - 0);
    }
  }

  /** Of consecutive commits the new ones are the last ones, and there is a gap exactly when the first of
      all is too late. */
  lemma NewOfConsecutive(commits: seq<CertifiedCommit>, last: nat)
    requires AreConsecutive(commits)
    ensures var kept := NewCommits(commits, last);
            && |kept| <= |commits| && kept == commits[|commits| - |kept|..]
            && (forall i :: 0 <= i < |commits| - |kept| ==> commits[i].index <= last)
            && (kept != [] && kept[0].index != last + 1 <==> commits != [] && commits[0].index > last + 1)
  {
    hide NewCommits, AreConsecutive;
    var k := FirstNew(commits, last);
    NewFrom(commits, last, k);
  }

  // ----- ranges of commits for scoring

  /** The swap table is made from a full schedule of commits, and the commits since then are being
      scored. */
  ghost predicate IsScheduled(commitsPerSchedule: nat, last: nat, table: CommitRange, scoring: Option<CommitRange>) {
    && commitsPerSchedule > 0 && table.End() % commitsPerSchedule == 0
    && (table == CommitRange.Default() || (table.IsNonEmpty() && table.Size() == commitsPerSchedule))
    && match scoring
       case None => last == table.End()
       case Some(r) => r.IsNonEmpty() && r.start == table.End() + 1 && r.End() == last && r.Size() <= commitsPerSchedule
  }

  lemma NextMultiple(m: nat, n: nat)
    requires n > 0 && m % n == 0
    ensures (m + n) % n == 0
  {
    assert m == m / n * n;
    assert m + n == (m / n + 1) * n;
    DivisionIsUnique(m + n, n, m / n + 1, 0);
  }

  lemma RemainderAfterMultiple(m: nat, k: nat, n: nat)
    requires n > 0 && m % n == 0 && k < n
    ensures (m + k) % n == k
  {
    assert m == m / n * n;
    DivisionIsUnique(m + k, n, m / n, k);
  }

  /** The decided leaders that still fit into the schedule. */
  function Cut(decided: seq<LeaderStatus>, limit: nat): seq<LeaderStatus> {
    if |decided| >= limit then decided[..limit] else decided
  }

  /** What successive runs of the commit rule add after `last` commits, `n` of which make a schedule. The
      first run that commits nothing ends it. */
  function LocalCommits(n: nat, last: nat, runs: seq<seq<LeaderStatus>>): seq<BlockRef>
    requires n > 0
    decreases |runs|
  {
    if runs == [] then []
    else
      var leaders := CommittedLeaders(Cut(runs[0], n - last % n));
      if leaders == [] then [] else leaders + LocalCommits(n, last + |leaders|, runs[1..])
  }

  function ScoredCount(scoring: Option<CommitRange>): nat
    requires scoring.Some? ==> scoring.value.start <= scoring.value.endExclusive
  {
    if scoring.Some? then scoring.value.Size() else 0
  }

  class Core {
    const commitsPerSchedule: nat

    var lastCommitIndex: nat
    var tableRange: CommitRange
    var scoringRange: Option<CommitRange>

    // The committed leaders, in order; the first has commit index one.
    ghost var log: seq<BlockRef>

    ghost predicate Valid()
      reads this
    {
      && commitsPerSchedule > 0
      && lastCommitIndex == |log|
      && IsScheduled(commitsPerSchedule, lastCommitIndex, tableRange, scoringRange)
    }

    constructor (commitsPerSchedule: nat)
      requires commitsPerSchedule > 0
      ensures Valid() && log == [] && this.commitsPerSchedule == commitsPerSchedule
    {
      this.commitsPerSchedule := commitsPerSchedule;
      lastCommitIndex, tableRange, scoringRange, log := 0, CommitRange.Default(), None, [];
    }

    function CommitsUntilUpdate(): nat
      requires Valid()
      reads this
    {
      commitsPerSchedule - ScoredCount(scoringRange)
    }

    /** A new swap table comes from the next range of commits, of the same size. */
    method UpdateLeaderSchedule()
      requires Valid() && CommitsUntilUpdate() == 0
      modifies this`tableRange, this`scoringRange
      ensures Valid() && CommitsUntilUpdate() == commitsPerSchedule
      ensures old(tableRange) != CommitRange.Default() ==>
                old(tableRange).IsNextRange(tableRange) && old(tableRange).IsEqualSize(tableRange)
      ensures tableRange.Size() == commitsPerSchedule && tableRange.End() == lastCommitIndex
    {
      var range := scoringRange.value;
      NextMultiple(tableRange.End(), commitsPerSchedule);
      scoringRange := None;
      tableRange := range;
    }

    /** Commits leaders and adds them to the commits being scored. */
    method HandleCommit(leaders: seq<BlockRef>)
      requires Valid() && |leaders| <= CommitsUntilUpdate()
      modifies this
      ensures Valid() && log == old(log) + leaders && tableRange == old(tableRange)
      ensures CommitsUntilUpdate() == old(CommitsUntilUpdate()) - |leaders|
    {
      for i := 0 to |leaders|
        invariant Valid() && log == old(log) + leaders[..i] && tableRange == old(tableRange)
        invariant CommitsUntilUpdate() == old(CommitsUntilUpdate()) - i
      {
        lastCommitIndex := lastCommitIndex + 1;
        if scoringRange.None? {
          scoringRange := Some(CommitRange.Inclusive(lastCommitIndex, lastCommitIndex));
        } else {
          scoringRange := Some(scoringRange.value.ExtendTo(lastCommitIndex));
        }
        log := log + [leaders[i]];
        assert leaders[..i + 1] == leaders[..i] + [leaders[i]];
      }
      assert leaders[..|leaders|] == leaders;
    }

    /** Makes room for more commits under a schedule. */
    method Prepare() returns (limit: nat)
      requires Valid()
      modifies this`tableRange, this`scoringRange
      ensures Valid() && 0 < limit == CommitsUntilUpdate() == commitsPerSchedule - lastCommitIndex % commitsPerSchedule
    {
      if CommitsUntilUpdate() == 0 {
        UpdateLeaderSchedule();
      }
      limit := CommitsUntilUpdate();
      RemainderAfterMultiple(tableRange.End(), ScoredCount(scoringRange), commitsPerSchedule);
    }

    /** Commits all certified commits, then what the successive runs of the commit rule decide, with a new
        schedule whenever one is used up. */
    method TryCommit(certified: seq<CertifiedCommit>, local: seq<seq<LeaderStatus>>) returns (committed: seq<BlockRef>)
      requires Valid()
      modifies this
      ensures Valid() && log == old(log) + committed
      ensures committed
           == Leaders(certified) + LocalCommits(commitsPerSchedule, old(lastCommitIndex) + |certified|, local)
    {
      hide Leaders, IsScheduled, CommittedLeaders, Cut, LocalCommits, WillCommit, Core.CommitsUntilUpdate, HasCommitted;
      committed := CommitCertified(certified);
      ghost var all := Leaders(certified) + LocalCommits(commitsPerSchedule, old(lastCommitIndex) + |certified|, local);
      LeadersSize(certified);
      AllRuns(committed, commitsPerSchedule, lastCommitIndex, local);
      for i := 0 to |local|
        invariant Valid() && log == old(log) + committed
        invariant WillCommit(committed, commitsPerSchedule, lastCommitIndex, local[i..], all)
      {
        var limit := Prepare();
        var leaders := CommittedLeaders(Cut(local[i], limit));
        NextRun(committed, commitsPerSchedule, lastCommitIndex, local, i, all);
        if leaders == [] {
          return;
        }
        committed := CommitNext(leaders, committed, old(log));
      }
      NoRuns(committed, commitsPerSchedule, lastCommitIndex, local, all);
    }

    /** Every certified commit is consumed, a schedule at a time. */
    method CommitCertified(certified: seq<CertifiedCommit>) returns (committed: seq<BlockRef>)
      requires Valid()
      modifies this
      ensures Valid() && log == old(log) + committed && committed == Leaders(certified)
    {
      hide Leaders, IsScheduled, HasCommitted, Core.CommitsUntilUpdate;
      committed := [];
      NothingCommitted(certified);
      var remaining := certified;
      while remaining != []
        invariant Valid() && log == old(log) + committed
        invariant HasCommitted(certified, remaining, committed)
        decreases |remaining|
      {
        var limit := Prepare();
        var n := if |remaining| >= limit then limit else |remaining|;
        CommittedNext(certified, remaining, committed, n);
        committed := CommitNext(Leaders(remaining[..n]), committed, old(log));
        remaining := remaining[n..];
      }
      AllCommitted(certified, committed);
    }

    method CommitNext(leaders: seq<BlockRef>, committed: seq<BlockRef>, ghost log0: seq<BlockRef>)
      returns (committed': seq<BlockRef>)
      requires Valid() && |leaders| <= CommitsUntilUpdate() && log == log0 + committed
      modifies this
      ensures Valid() && committed' == committed + leaders && log == log0 + committed'
    {
      HandleCommit(leaders);
      committed' := committed + leaders;
    }

    /** Takes a batch of certified commits that leaves no gap. Afterwards all of them are committed. */
    method AddCertifiedCommits(commits: seq<CertifiedCommit>, local: seq<seq<LeaderStatus>>)
      requires Valid() && AreConsecutive(commits)
      requires commits != [] ==> commits[0].index <= lastCommitIndex + 1
      modifies this
      ensures Valid() && old(log) <= log
      ensures forall i :: 0 <= i < |commits| ==> commits[i].index <= lastCommitIndex
      ensures forall i :: 0 <= i < |commits| && commits[i].index > old(lastCommitIndex) ==>
                log[commits[i].index - 1] == commits[i].leader
    {
      NewOfConsecutive(commits, lastCommitIndex);
      hide NewCommits;
      var filtered := FilterNewCommits(commits, lastCommitIndex);
      var committed := TryCommit(filtered.commits, local);
      ghost var skipped := |commits| - |filtered.commits|;
      forall i | skipped <= i < |commits|
        ensures commits[i].index == old(lastCommitIndex) + 1 + (i - skipped)
        ensures log[commits[i].index - 1] == commits[i].leader
      {
        assert commits[i] == filtered.commits[i - skipped];
        assert Leaders(filtered.commits)[i - skipped] == commits[i].leader;
      }
    }
  }

  /** All certified commits but the remaining ones are committed, in order. */
  ghost predicate HasCommitted(certified: seq<CertifiedCommit>, remaining: seq<CertifiedCommit>,
                               committed: seq<BlockRef>)
  {
    && |remaining| <= |certified| && remaining == certified[|certified| - |remaining|..]
    && committed == Leaders(certified[..|certified| - |remaining|])
  }

  lemma NothingCommitted(certified: seq<CertifiedCommit>)
    ensures HasCommitted(certified, certified, [])
  {
    assert Leaders(certified[..0]) == [];
  }

  lemma CommittedNext(certified: seq<CertifiedCommit>, remaining: seq<CertifiedCommit>, committed: seq<BlockRef>,
                      n: nat)
    requires HasCommitted(certified, remaining, committed) && n <= |remaining|
    ensures |Leaders(remaining[..n])| == n
    ensures HasCommitted(certified, remaining[n..], committed + Leaders(remaining[..n]))
  {
    var taken := |certified| - |remaining|;
    assert Leaders(certified[..taken + n]) == Leaders(certified[..taken]) + Leaders(remaining[..n]);
  }

  lemma AllCommitted(certified: seq<CertifiedCommit>, committed: seq<BlockRef>)
    requires HasCommitted(certified, [], committed)
    ensures committed == Leaders(certified)
  {
    assert certified[..|certified|] == certified;
  }

  lemma LeadersSize(certified: seq<CertifiedCommit>)
    ensures |Leaders(certified)| == |certified|
  {
  }

  /** What is committed and what the remaining runs add come to `all`. */
  ghost predicate WillCommit(committed: seq<BlockRef>, n: nat, last: nat, runs: seq<seq<LeaderStatus>>,
                             all: seq<BlockRef>)
    requires n > 0
  {
    committed + LocalCommits(n, last, runs) == all
  }

  lemma AllRuns(committed: seq<BlockRef>, n: nat, last: nat, runs: seq<seq<LeaderStatus>>)
    requires n > 0
    ensures WillCommit(committed, n, last, runs[0..], committed + LocalCommits(n, last, runs))
  {
    assert runs[0..] == runs;
  }

  lemma NextRun(committed: seq<BlockRef>, n: nat, last: nat, runs: seq<seq<LeaderStatus>>, i: nat, all: seq<BlockRef>)
    requires n > 0 && i < |runs| && WillCommit(committed, n, last, runs[i..], all)
    ensures var limit := n - last % n;
            var leaders := CommittedLeaders(Cut(runs[i], limit));
            && |leaders| <= limit
            && (leaders == [] ==> committed == all)
            && (leaders != [] ==> WillCommit(committed + leaders, n, last + |leaders|, runs[i + 1..], all))
  {
    hide CommittedLeaders;
    FewerAreCommitted(Cut(runs[i], n - last % n));
    assert runs[i..][1..] == runs[i + 1..];
    var leaders := CommittedLeaders(Cut(runs[i], n - last % n));
    var rest := LocalCommits(n, last + |leaders|, runs[i + 1..]);
    assert committed + (leaders + rest) == committed + leaders + rest;
  }

  lemma NoRuns(committed: seq<BlockRef>, n: nat, last: nat, runs: seq<seq<LeaderStatus>>, all: seq<BlockRef>)
    requires n > 0 && WillCommit(committed, n, last, runs[|runs|..], all)
    ensures committed == all
  {
  }

  lemma {:induction false} FewerAreCommitted(decided: seq<LeaderStatus>)
    ensures |CommittedLeaders(decided)| <= |decided|
  {
    if decided == [] {
    } else {
      FewerAreCommitted(decided[..|decided| - 1]);
    }
  }
}
