/** Scheduling of commit ranges to fetch from other validators. No index is lost or fetched twice,
    and what is handed to the core leaves no gap. */
module CommitSyncers {
  import opened Blocks
  import opened CommitRanges
  import opened CommitRule
  import opened Cores

  // ----- conservation

  /** Ranges without overlap, none above the highest scheduled index, which cover every scheduled
      index that is not synced. */
  ghost predicate IsPartition(ranges: set<CommitRange>, synced: nat, highest: Option<nat>) {
    && (forall r :: r in ranges ==> r.IsNonEmpty() && highest.Some? && r.End() <= highest.value)
    && (forall r, s :: r in ranges && s in ranges && r != s ==> AreApart(r, s))
    && (forall i: nat :: synced < i && highest.Some? && i <= highest.value ==> IsCovered(ranges, i))
  }

  ghost predicate IsCovered(ranges: set<CommitRange>, i: nat) {
    exists r :: r in ranges && r.Contains(i)
  }

  /** Every range is in exactly one place. */
  ghost predicate IsConserved(pending: set<CommitRange>, inflight: set<CommitRange>, fetched: set<CommitRange>,
                              synced: nat, highest: Option<nat>)
  {
    && pending !! inflight && pending !! fetched && inflight !! fetched
    && IsPartition(pending + inflight + fetched, synced, highest)
  }

  /** What conservation means for a single index. */
  lemma IndexIsInOnePlace(pending: set<CommitRange>, inflight: set<CommitRange>, fetched: set<CommitRange>, synced: nat,
                          highest: Option<nat>, i: nat, r: CommitRange, s: CommitRange)
    requires IsConserved(pending, inflight, fetched, synced, highest)
    requires r in pending + inflight + fetched && s in pending + inflight + fetched && r.Contains(i) && s.Contains(i)
    ensures r == s
  {
  }

  lemma SyncedGrows(ranges: set<CommitRange>, synced: nat, highest: Option<nat>, synced': nat)
    requires IsPartition(ranges, synced, highest) && synced <= synced'
    ensures IsPartition(ranges, synced', highest)
  {
  }

  /** A new range right after everything that is synced or scheduled. */
  lemma ScheduleKeepsPartition(ranges: set<CommitRange>, synced: nat, highest: Option<nat>, after: nat, end: nat)
    requires IsPartition(ranges, synced, highest)
    requires after < end && synced <= after && (highest.Some? ==> highest.value <= after)
    requires after == synced || (highest.Some? && after == highest.value)
    ensures CommitRange.Inclusive(after + 1, end) !in ranges
    ensures IsPartition(ranges + {CommitRange.Inclusive(after + 1, end)}, synced, Some(end))
  {
    var range := CommitRange.Inclusive(after + 1, end);
    var ranges' := ranges + {range};
    forall i: nat | synced < i <= end
      ensures IsCovered(ranges', i)
    {
      if i > after {
        assert range in ranges' && range.Contains(i);
      } else {
        assert IsCovered(ranges, i);
        var r :| r in ranges && r.Contains(i);
        assert r in ranges';
      }
    }
  }

  /** A range may be dropped when all of it is synced. */
  lemma DropKeepsPartition(ranges: set<CommitRange>, synced: nat, highest: Option<nat>, range: CommitRange,
                           synced': nat)
    requires IsPartition(ranges, synced, highest) && range in ranges && synced <= synced' && range.End() <= synced'
    ensures IsPartition(ranges - {range}, synced', highest)
  {
    forall i: nat | synced' < i && highest.Some? && i <= highest.value
      ensures IsCovered(ranges - {range}, i)
    {
      assert IsCovered(ranges, i);
      var r :| r in ranges && r.Contains(i);
      assert r in ranges - {range};
    }
  }

  /** A range may be replaced by its two parts. */
  lemma SplitKeepsPartition(ranges: set<CommitRange>, synced: nat, highest: Option<nat>, range: CommitRange, mid: nat)
    requires IsPartition(ranges, synced, highest) && range in ranges && range.start <= mid < range.End()
    ensures var low, high := CommitRange.Inclusive(range.start, mid), CommitRange.Inclusive(mid + 1, range.End());
            && low !in ranges && high !in ranges && low != high
            && IsPartition(ranges - {range} + {low, high}, synced, highest)
  {
    var low, high := CommitRange.Inclusive(range.start, mid), CommitRange.Inclusive(mid + 1, range.End());
    var ranges' := ranges - {range} + {low, high};
    assert !AreApart(low, range) && !AreApart(high, range);
    forall i: nat | synced < i && highest.Some? && i <= highest.value
      ensures IsCovered(ranges', i)
    {
      assert IsCovered(ranges, i);
      var r :| r in ranges && r.Contains(i);
      if r == range {
        assert low.Contains(i) || high.Contains(i);
        assert low in ranges' && high in ranges';
      } else {
        assert r in ranges';
      }
    }
    forall r, s | r in ranges' && s in ranges' && r != s
      ensures AreApart(r, s)
    {
      assert r in ranges && r != range ==> AreApart(r, range);
      assert s in ranges && s != range ==> AreApart(s, range);
    }
  }

  // ----- fetched commits

  /** The commits are exactly those of the range. */
  ghost predicate AreCommitsOf(range: CommitRange, commits: seq<CertifiedCommit>) {
    && range.IsNonEmpty()
    && |commits| == range.Size()
    && forall i :: 0 <= i < |commits| ==> commits[i].index == range.start + i
  }

  /** What a fetch may return: a non-empty run of commits from the start of the range. */
  ghost predicate IsFetchResult(range: CommitRange, commits: seq<CertifiedCommit>) {
    && range.IsNonEmpty()
    && 0 < |commits| <= range.Size()
    && forall i :: 0 <= i < |commits| ==> commits[i].index == range.start + i
  }

  /** What the commit rule decides in the core after a batch. */
  type Decisions = CommitRange -> seq<seq<LeaderStatus>>

  class CommitSyncer {
    const batchSize: nat
    const core: Core

    var pending: set<CommitRange>
    var inflight: set<CommitRange>
    var fetched: map<CommitRange, seq<CertifiedCommit>>
    var highestScheduled: Option<nat>
    var synced: nat

    ghost predicate Valid()
      reads this, core
    {
      && batchSize > 0
      && core.Valid() && synced <= core.lastCommitIndex
      && IsConserved(pending, inflight, fetched.Keys, synced, highestScheduled)
      && (forall r :: r in fetched ==> AreCommitsOf(r, fetched[r]))
    }

    constructor (core: Core, batchSize: nat)
      requires core.Valid() && batchSize > 0
      ensures Valid() && this.core == core && this.batchSize == batchSize && synced == core.lastCommitIndex
      ensures pending == {} && inflight == {} && fetched == map[] && highestScheduled == None
    {
      this.core, this.batchSize := core, batchSize;
      pending, inflight, fetched, highestScheduled, synced := {}, {}, map[], None, core.lastCommitIndex;
    }

    /** The index after which new ranges start. */
    function FetchAfter(): nat
      reads this
    {
      if highestScheduled.Some? && highestScheduled.value > synced then highestScheduled.value else synced
    }

    /** Schedules full batches up to the index that a quorum has committed, as long as the handler of
        commits keeps up. */
    method TryScheduleOnce(quorumIndex: nat, highestHandled: nat, unhandledThreshold: nat)
      requires Valid()
      modifies this`pending, this`highestScheduled, this`synced
      ensures Valid() && old(pending) <= pending
      ensures synced == (if core.lastCommitIndex > old(synced) then core.lastCommitIndex else old(synced))
      ensures FetchAfter() >= old(FetchAfter())
      ensures highestScheduled == old(highestScheduled) || highestScheduled == Some(FetchAfter())
      ensures highestScheduled != old(highestScheduled) ==>
                FetchAfter() <= quorumIndex && FetchAfter() <= highestHandled + unhandledThreshold
      ensures FetchAfter() + batchSize > quorumIndex || FetchAfter() + batchSize > highestHandled + unhandledThreshold
      ensures forall r :: r in pending && r !in old(pending) ==> r.Size() == batchSize
    {
      hide IsPartition;
      if core.lastCommitIndex > synced {
        SyncedGrows(pending + inflight + fetched.Keys, synced, highestScheduled, core.lastCommitIndex);
        synced := core.lastCommitIndex;
      }
      var prevEnd := FetchAfter();
      while prevEnd <= quorumIndex
        invariant Valid() && old(pending) <= pending && prevEnd == FetchAfter() >= old(FetchAfter())
        invariant synced == (if core.lastCommitIndex > old(synced) then core.lastCommitIndex else old(synced))
        invariant highestScheduled == old(highestScheduled) || highestScheduled == Some(prevEnd)
        invariant highestScheduled != old(highestScheduled) ==>
                    prevEnd <= quorumIndex && prevEnd <= highestHandled + unhandledThreshold
        invariant forall r :: r in pending && r !in old(pending) ==> r.IsNonEmpty() && r.Size() == batchSize
        decreases quorumIndex - prevEnd
      {
        var rangeEnd := prevEnd + batchSize;
        if quorumIndex < rangeEnd {
          break;
        }
        if highestHandled + unhandledThreshold < rangeEnd {
          break;
        }
        var range := CommitRange.Inclusive(prevEnd + 1, rangeEnd);
        ScheduleKeepsPartition(pending + inflight + fetched.Keys, synced, highestScheduled, prevEnd, rangeEnd);
        assert pending + {range} + inflight + fetched.Keys == pending + inflight + fetched.Keys + {range};
        pending := pending + {range};
        highestScheduled := Some(rangeEnd);
        prevEnd := rangeEnd;
      }
    }

    /** Starts fetches for the first pending ranges, up to a limit of parallel fetches. */
    method TryStartFetches(limit: nat)
      requires Valid()
      modifies this`pending, this`inflight
      ensures Valid() && pending + inflight == old(pending) + old(inflight) && old(inflight) <= inflight
      ensures pending == {} || |inflight| >= limit
      ensures forall r, s :: r in pending && s in inflight && s !in old(inflight) ==> s.Less(r)
    {
      hide IsConserved, AreCommitsOf;
      while |inflight| < limit && pending != {}
        invariant Valid() && pending + inflight == old(pending) + old(inflight) && old(inflight) <= inflight
        invariant forall r, s :: r in pending && s in inflight && s !in old(inflight) ==> s.Less(r)
        decreases |pending|
      {
        PendingIsNonEmpty(pending, inflight, fetched.Keys, synced, highestScheduled);
        var range := FirstRange(pending);
        StartKeepsConserved(pending, inflight, fetched.Keys, synced, highestScheduled, range);
        pending := pending - {range};
        inflight := inflight + {range};
      }
    }

    /** Takes the result of a fetch, puts the rest of the range back, and hands over to the core what
        follows the synced commits. The core never sees a gap. */
    method HandleFetchResult(range: CommitRange, commits: seq<CertifiedCommit>, local: Decisions)
      requires Valid() && range in inflight && IsFetchResult(range, commits)
      modifies this`pending, this`inflight, this`fetched, this`synced, core
      ensures Valid() && synced >= old(synced) && highestScheduled == old(highestScheduled)
      ensures inflight == old(inflight) - {range}
      ensures forall r :: r in fetched ==> r.start > synced + 1
      ensures old(core.log) <= core.log
    {
      hide IsConserved, AreCommitsOf;
      var end := commits[|commits| - 1].index;
      var got := CommitRange.Inclusive(range.start, end);
      ResultIsOfRange(range, commits, end);
      TakeResult(pending, inflight, fetched.Keys, synced, highestScheduled, range, end);
      inflight := inflight - {range};
      if end < range.End() {
        pending := pending + {CommitRange.Inclusive(end + 1, range.End())};
      }
      AdvanceSynced(pending, inflight, fetched.Keys + {got}, synced, highestScheduled, core.lastCommitIndex);
      if core.lastCommitIndex > synced {
        synced := core.lastCommitIndex;
      }
      if synced < end {
        assert fetched[got := commits].Keys == fetched.Keys + {got};
        fetched := fetched[got := commits];
      } else {
        DropFetched(pending, inflight, fetched.Keys + {got}, synced, highestScheduled, got, synced);
        assert fetched.Keys + {got} - {got} == fetched.Keys;
      }
      ProcessFetched(local);
    }

    /** Hands fetched ranges to the core as long as they follow the synced commits. */
    method ProcessFetched(local: Decisions)
      requires Valid()
      modifies this`fetched, this`synced, core
      ensures Valid() && synced >= old(synced)
      ensures forall r :: r in fetched ==> r.start > synced + 1
      ensures old(core.log) <= core.log
    {
      hide IsConserved, AreCommitsOf;
      while fetched.Keys != {}
        invariant Valid() && synced >= old(synced) && old(core.log) <= core.log
        decreases |fetched.Keys|
      {
        FetchedIsNonEmpty(pending, inflight, fetched.Keys, synced, highestScheduled);
        var range := FirstRange(fetched.Keys);
        if range.start > synced + 1 {
          break;
        }
        HandOver(range, local);
      }
    }

    /** The first fetched range follows the synced commits, or is synced already. */
    method HandOver(range: CommitRange, local: Decisions)
      requires Valid() && range in fetched && range.start <= synced + 1
      modifies this`fetched, this`synced, core
      ensures Valid() && synced == (if range.End() > old(synced) then range.End() else old(synced))
      ensures fetched.Keys == old(fetched.Keys) - {range} && old(core.log) <= core.log
    {
      hide IsConserved;
      var commits := fetched[range];
      var synced' := if range.End() > synced then range.End() else synced;
      DropFetched(pending, inflight, fetched.Keys, synced, highestScheduled, range, synced');
      assert (fetched - {range}).Keys == fetched.Keys - {range};
      fetched := fetched - {range};
      if range.End() > synced {
        core.AddCertifiedCommits(commits, local(range));
        assert commits[|commits| - 1].index == range.End();
      }
      synced := synced';
    }

    /** Commits that the core decides on its own keep the syncer's state in order. */
    method CommitLocally(local: seq<seq<LeaderStatus>>)
      requires Valid()
      modifies core
      ensures Valid() && old(core.log) <= core.log
    {
      var committed := core.TryCommit([], local);
    }
  }

  lemma PendingIsNonEmpty(pending: set<CommitRange>, inflight: set<CommitRange>, fetched: set<CommitRange>, synced: nat,
                          highest: Option<nat>)
    requires IsConserved(pending, inflight, fetched, synced, highest)
    ensures forall r :: r in pending ==> r.IsNonEmpty()
  {
    forall r | r in pending
      ensures r.IsNonEmpty()
    {
      assert r in pending + inflight + fetched;
    }
  }

  lemma FetchedIsNonEmpty(pending: set<CommitRange>, inflight: set<CommitRange>, fetched: set<CommitRange>, synced: nat,
                          highest: Option<nat>)
    requires IsConserved(pending, inflight, fetched, synced, highest)
    ensures forall r :: r in fetched ==> r.IsNonEmpty()
  {
    forall r | r in fetched
      ensures r.IsNonEmpty()
    {
      assert r in pending + inflight + fetched;
    }
  }

  lemma StartKeepsConserved(pending: set<CommitRange>, inflight: set<CommitRange>, fetched: set<CommitRange>,
                            synced: nat, highest: Option<nat>, range: CommitRange)
    requires IsConserved(pending, inflight, fetched, synced, highest) && range in pending
    ensures IsConserved(pending - {range}, inflight + {range}, fetched, synced, highest)
  {
    hide IsPartition;
    assert pending - {range} + (inflight + {range}) + fetched == pending + inflight + fetched;
  }

  lemma AdvanceSynced(pending: set<CommitRange>, inflight: set<CommitRange>, fetched: set<CommitRange>, synced: nat,
                      highest: Option<nat>, synced': nat)
    requires IsConserved(pending, inflight, fetched, synced, highest)
    ensures synced <= synced' ==> IsConserved(pending, inflight, fetched, synced', highest)
  {
    if synced <= synced' {
      SyncedGrows(pending + inflight + fetched, synced, highest, synced');
    }
  }

  lemma DropFetched(pending: set<CommitRange>, inflight: set<CommitRange>, fetched: set<CommitRange>, synced: nat,
                    highest: Option<nat>, range: CommitRange, synced': nat)
    requires IsConserved(pending, inflight, fetched, synced, highest) && range in fetched
    requires synced <= synced' && range.End() <= synced'
    ensures IsConserved(pending, inflight, fetched - {range}, synced', highest)
  {
    hide IsPartition;
    DropKeepsPartition(pending + inflight + fetched, synced, highest, range, synced');
    assert pending + inflight + (fetched - {range}) == pending + inflight + fetched - {range};
  }

  lemma ResultIsOfRange(range: CommitRange, commits: seq<CertifiedCommit>, end: nat)
    requires IsFetchResult(range, commits) && end == commits[|commits| - 1].index
    ensures range.start <= end <= range.End() && AreCommitsOf(CommitRange.Inclusive(range.start, end), commits)
  {
  }

  /** The fetched part of a range moves on, the rest goes back to pending. */
  lemma TakeResult(pending: set<CommitRange>, inflight: set<CommitRange>, fetched: set<CommitRange>, synced: nat,
                   highest: Option<nat>, range: CommitRange, end: nat)
    requires IsConserved(pending, inflight, fetched, synced, highest) && range in inflight
    requires range.start <= end <= range.End()
    ensures var got, rest := CommitRange.Inclusive(range.start, end), CommitRange.Inclusive(end + 1, range.End());
            var pending' := if end < range.End() then pending + {rest} else pending;
            var inflight' := inflight - {range};
            IsConserved(pending', inflight', fetched + {got}, synced, highest) && got !in fetched
  {
    hide IsPartition;
    var ranges := pending + inflight + fetched;
    var got, rest := CommitRange.Inclusive(range.start, end), CommitRange.Inclusive(end + 1, range.End());
    var inflight' := inflight - {range};
    RangeIsNonEmpty(ranges, synced, highest, range);
    if end < range.End() {
      SplitKeepsPartition(ranges, synced, highest, range, end);
      assert ranges - {range} + {got, rest} == pending + {rest} + inflight' + (fetched + {got});
    } else {
      assert got == range;
      assert ranges == pending + inflight' + (fetched + {got});
    }
  }

  lemma RangeIsNonEmpty(ranges: set<CommitRange>, synced: nat, highest: Option<nat>, range: CommitRange)
    requires IsPartition(ranges, synced, highest) && range in ranges
    ensures range.IsNonEmpty()
  {
  }
}
